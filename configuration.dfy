/** The storage mapping of the Notifications table
    (job-portal-system/Data/Configurations/NotificationConfiguration.cs), read as the
    conditions a stored row satisfies and the text form of the category column. */
module NotificationConfiguration {
  import opened NotificationDomain

  const TitleMaxLength: nat := 200
  const MessageMaxLength: nat := 500
  const RelatedEntityIdMaxLength: nat := 50
  const ActionUrlMaxLength: nat := 500

  /** An optional column with a maximum length: absent, or present and short enough. */
  predicate FitsOptional(s: Option<string>, maxLength: nat)
  {
    s.None? || |s.value| <= maxLength
  }

  /** The column constraints of one row. The required columns (`UserId`, `Title`,
      `Message`, `Type`, `IsRead`, `CreatedAt`) can never be null in this model, and an
      empty string is accepted for each of them; only the maximum lengths constrain. */
  predicate WellFormed(n: Notification)
  {
    |n.title| <= TitleMaxLength
    && |n.message| <= MessageMaxLength
    && FitsOptional(n.relatedEntityId, RelatedEntityIdMaxLength)
    && FitsOptional(n.actionUrl, ActionUrlMaxLength)
  }

  /** `Id` is the primary key: no two rows share it. */
  predicate KeysUnique(rows: seq<Notification>)
  {
    forall i, j :: 0 <= i < j < |rows| ==> rows[i].id != rows[j].id
  }

  /** The text stored in the `Type` column: the member's name. */
  function TypeName(t: NotificationType): string
  {
    match t
    case NewUser => "NewUser"
    case NewJobPost => "NewJobPost"
    case NewApplication => "NewApplication"
    case JobApplicationReceived => "JobApplicationReceived"
    case ApplicationWithdrawn => "ApplicationWithdrawn"
    case NewJobPosted => "NewJobPosted"
    case ApplicationStatusChanged => "ApplicationStatusChanged"
    case ApplicationAccepted => "ApplicationAccepted"
    case ApplicationRejected => "ApplicationRejected"
  }

  /** The first category among `candidates` whose name is `s`. */
  function FindByName(s: string, candidates: seq<NotificationType>): (r: Option<NotificationType>)
    ensures r.Some? ==> r.value in candidates && TypeName(r.value) == s
    ensures r.None? ==> forall t :: t in candidates ==> TypeName(t) != s
  {
    if candidates == [] then None
    else if TypeName(candidates[0]) == s then Some(candidates[0])
    else FindByName(s, candidates[1..])
  }

  /** Reading the `Type` column back: the category whose name the stored text is, if
      any. */
  function ParseTypeName(s: string): (r: Option<NotificationType>)
    ensures r.Some? ==> TypeName(r.value) == s
    ensures r.None? ==> forall t :: TypeName(t) != s
  {
    EnumerationIsComplete();
    FindByName(s, AllTypes)
  }

  /** Distinct categories are stored as distinct texts. */
  lemma TypeNameInjective(t: NotificationType, u: NotificationType)
    requires TypeName(t) == TypeName(u)
    ensures t == u
  {
    match t
    case NewUser => assert TypeName(u)[3] == 'U';
    case NewJobPost => assert |TypeName(u)| == 10;
    case NewApplication => assert |TypeName(u)| == 14;
    case JobApplicationReceived => assert |TypeName(u)| == 22;
    case ApplicationWithdrawn => assert |TypeName(u)| == 20;
    case NewJobPosted => assert |TypeName(u)| == 12;
    case ApplicationStatusChanged => assert |TypeName(u)| == 24;
    case ApplicationAccepted => assert TypeName(u)[11] == 'A';
    case ApplicationRejected => assert TypeName(u)[11] == 'R';
  }

  /** Writing a category and reading it back gives the same category. */
  lemma TypeNameRoundTrip(t: NotificationType)
    ensures ParseTypeName(TypeName(t)) == Some(t)
  {
    var r := ParseTypeName(TypeName(t));
    assert r.Some?;
    TypeNameInjective(r.value, t);
  }
}
