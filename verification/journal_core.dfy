/**
  The Journal bounded context's core: the entity, its validator, its error
  values, the repository port and the domain service that validates on
  create and otherwise forwards to whichever repository it was built with.
 */
module JournalCore {
  import opened Text
  import opened Outcomes

  /** A journal record. The impact factor is a Go `float64`; only its sign is
      ever inspected, so it is a real number here. */
  datatype Journal = Journal(
    id: string,
    name: string,
    description: string,
    impactFactor: real)

  /** Go's zero `Journal{}`. */
  const ZeroJournal := Journal("", "", "", 0.0)

  /** The fields the validator checks, in the order it checks them. */
  datatype Field = Id | Name | ImpactFactor

  type JournalError = Error<Field>
  type JournalReply = Reply<Journal, Field>

  /** The text of the sentinels `ErrJournalNotFound` and `ErrInvalidJournal`. */
  const NotFoundText := "journal not found"
  const InvalidText := "invalid journal data"

  /** The reference meaning of a valid journal: id and name are not blank and
      the impact factor is not negative (zero is allowed). */
  predicate IsValid(j: Journal) {
    !IsBlank(j.id) && !IsBlank(j.name) && j.impactFactor >= 0.0
  }

  /** `Journal.Validate`: the first failing check, in the order id, name,
      impact factor, is reported as an invalid-journal error; otherwise the
      result is nil. */
  function Validate(j: Journal): (r: Option<JournalError>)
    ensures r.None? <==> IsValid(j)
    ensures r == Some(Invalid(Id)) <==> IsBlank(j.id)
    ensures r == Some(Invalid(Name)) <==> !IsBlank(j.id) && IsBlank(j.name)
    ensures r == Some(Invalid(ImpactFactor)) <==> !IsBlank(j.id) && !IsBlank(j.name) && j.impactFactor < 0.0
    ensures r.Some? ==> r.value.Invalid?
  {
    if TrimSpace(j.id) == "" then Some(Invalid(Id))
    else if TrimSpace(j.name) == "" then Some(Invalid(Name))
    else if j.impactFactor < 0.0 then Some(Invalid(ImpactFactor))
    else None
  }

  /** The description never affects validation. */
  lemma ValidateIgnoresDescription(j: Journal, description: string)
    ensures Validate(j.(description := description)) == Validate(j)
  {
  }

  /** The text `err.Error()` yields. An invalid-journal error wraps the
      sentinel with `%w`, so its text starts with the sentinel's. */
  function Message(e: JournalError): string {
    match e
    case NotFound => NotFoundText
    case Invalid(f) => InvalidText + ": " + Reason(f)
    case Other(msg) => msg
  }

  function Reason(f: Field): string {
    match f
    case Id => "ID cannot be empty"
    case Name => "name cannot be empty"
    case ImpactFactor => "impact factor cannot be negative"
  }

  /** The `%w` wrap: a sentinel-derived message starts with the
      invalid-journal sentinel's text exactly when the error is an
      invalid-journal error, so the prefix tells the two sentinels apart. */
  lemma MessageWrapsSentinel(e: JournalError)
    requires !e.Other?
    ensures InvalidText <= Message(e) <==> e.Invalid?
  {
  }

  /** Two sentinel-derived errors print the same text exactly when they are
      the same error, so the text names the failing field. */
  lemma MessageIdentifiesError(e: JournalError, e': JournalError)
    requires !e.Other? && !e'.Other?
    ensures Message(e) == Message(e') <==> e == e'
  {
  }

  /** The repository port: any storage with state `S` offering the two
      operations, each returning its reply and the state after the call. */
  datatype JournalPort<!S> = JournalPort(
    createJournal: (S, Journal) -> (JournalReply, S),
    getJournal: (S, string) -> (JournalReply, S))

  /** `JournalService.CreateJournal`: an invalid journal is answered with the
      validator's error and a zero journal without touching the repository;
      a valid one is handed to the repository, whose reply and new state are
      the result. */
  function CreateJournal<S>(port: JournalPort<S>, s: S, j: Journal): (r: (JournalReply, S))
    ensures !IsValid(j) ==> r.1 == s && r.0.value == ZeroJournal && r.0.err == Validate(j) && r.0.err.Some?
    ensures IsValid(j) ==> r == port.createJournal(s, j)
  {
    match Validate(j)
    case Some(e) => (Failure(ZeroJournal, e), s)
    case None => port.createJournal(s, j)
  }

  /** An invalid journal never reaches the repository: the outcome is the
      same whatever the repository would have done with it. */
  lemma InvalidJournalNeverReachesPort<S>(p: JournalPort<S>, q: JournalPort<S>, s: S, j: Journal)
    requires !IsValid(j)
    ensures CreateJournal(p, s, j) == CreateJournal(q, s, j)
  {
  }

  /** `JournalService.GetJournal`: the repository's reply, unvalidated. */
  function GetJournal<S>(port: JournalPort<S>, s: S, id: string): (r: (JournalReply, S))
    ensures r == port.getJournal(s, id)
  {
    port.getJournal(s, id)
  }
}
