/**
  The in-memory Journal repository: a map from id to journal, with no
  locking (every operation is taken to run alone).
 */
module JournalMemory {
  import Text
  import opened Outcomes
  import opened JournalCore

  type Store = map<string, Journal>

  /** The text of the error a failed lookup returns. It is a fresh error
      value, so it is not the `ErrJournalNotFound` sentinel although its text
      is the same. */
  const MissingText := "journal not found"

  /** Every stored journal sits under its own id. */
  predicate WellKeyed(m: Store) {
    forall k :: k in m ==> m[k].id == k
  }

  /** A freshly constructed repository. */
  function NewRepository(): (m: Store)
    ensures WellKeyed(m) && |m| == 0
  {
    map[]
  }

  /** `CreateJournal`: stores the journal under its id, replacing whatever was
      there, and hands it back with a nil error. Nothing is validated. */
  function CreateJournal(m: Store, j: Journal): (r: (JournalReply, Store))
    ensures r.0.Ok() && r.0.value == j
    ensures r.1.Keys == m.Keys + {j.id} && r.1[j.id] == j
    ensures forall k :: k in m && k != j.id ==> r.1[k] == m[k]
    ensures WellKeyed(m) ==> WellKeyed(r.1)
  {
    (Success(j), m[j.id := j])
  }

  /** `GetJournal`: the stored journal, or a zero journal with a fresh
      "journal not found" error. The store is left as it was. */
  function GetJournal(m: Store, id: string): (r: (JournalReply, Store))
    ensures r.1 == m
    ensures r.0.Ok() <==> id in m
    ensures id in m ==> r.0.value == m[id]
    ensures id !in m ==> r.0.value == ZeroJournal && r.0.err.Some?
    ensures id !in m ==> r.0.err.value != NotFound && Message(r.0.err.value) == Message(NotFound)
  {
    if id in m then (Success(m[id]), m) else (Failure(ZeroJournal, Other(MissingText)), m)
  }

  /** Reading an id back right after creating under it yields what was
      created; a second create under the same id replaces the first. */
  lemma CreateThenGet(m: Store, j: Journal, k: Journal)
    requires k.id == j.id
    ensures GetJournal(CreateJournal(m, j).1, j.id).0 == Success(j)
    ensures GetJournal(CreateJournal(CreateJournal(m, j).1, k).1, j.id).0 == Success(k)
  {
  }

  /** A successful lookup over a well-keyed store returns a journal whose own
      id is the one asked for. */
  lemma GetReturnsOwnId(m: Store, id: string)
    requires WellKeyed(m)
    ensures GetJournal(m, id).0.Ok() ==> GetJournal(m, id).0.value.id == id
  {
  }

  /** The adapter as a `JournalRepository`. A repository reached through it
      returns what was just created under an id, and answers every id it does
      not hold with an error, never with a journal. */
  function Port(): (p: JournalPort<Store>)
    ensures forall m: Store, j: Journal :: p.getJournal(p.createJournal(m, j).1, j.id).0 == Success(j)
    ensures forall m: Store, id: string :: p.getJournal(m, id).0.Ok() <==> id in m
  {
    JournalPort(
      (m, j) => CreateJournal(m, j),
      (m, id) => GetJournal(m, id))
  }

  /** Creating a valid journal through the service and reading it back yields
      the same journal. */
  lemma ServiceCreateThenGet(m: Store, j: Journal)
    requires IsValid(j)
    ensures var (created, m') := JournalCore.CreateJournal(Port(), m, j);
            && created == Success(j)
            && JournalCore.GetJournal(Port(), m', j.id) == (Success(j), m')
  {
    var m' := m[j.id := j];
    assert JournalCore.CreateJournal(Port(), m, j) == CreateJournal(m, j) == (Success(j), m');
    assert JournalCore.GetJournal(Port(), m', j.id) == GetJournal(m', j.id);
  }

  /** A lookup through the service of an id that was never stored fails with
      the adapter's own error, which is not the not-found sentinel. */
  lemma ServiceMissIsNotSentinel(m: Store, id: string)
    requires id !in m
    ensures JournalCore.GetJournal(Port(), m, id) == (Failure(ZeroJournal, Other(MissingText)), m)
  {
  }

  /** Every stored journal passes validation. */
  predicate AllValid(m: Store) {
    forall k :: k in m ==> IsValid(m[k])
  }

  /** A store filled only through the service holds valid journals only. */
  lemma ServiceKeepsStoreValid(m: Store, j: Journal)
    requires AllValid(m)
    ensures AllValid(JournalCore.CreateJournal(Port(), m, j).1)
  {
  }

  /** The demonstration journal "Nature" with impact factor 64.8 is valid,
      whatever its description. */
  lemma NatureIsValid(nature: Journal)
    requires nature.id == "journal_1" && nature.name == "Nature" && nature.impactFactor == 64.8
    ensures IsValid(nature)
  {
    assert !Text.IsSpace(nature.id[0]);
    assert !Text.IsSpace(nature.name[0]);
  }

  /** A worked example: the demonstration journal, stored through the service
      into an empty repository, is read back by its id. */
  lemma NatureExample(nature: Journal, m: Store)
    requires nature.id == "journal_1" && nature.name == "Nature" && nature.impactFactor == 64.8
    requires m == map[nature.id := nature]
    ensures JournalCore.CreateJournal(Port(), NewRepository(), nature) == (Success(nature), m)
    ensures JournalCore.GetJournal(Port(), m, "journal_1").0 == Success(nature)
  {
    NatureIsValid(nature);
  }

  /** A worked example: once the demonstration journal is stored, a lookup of
      the id "missing" fails with a zero journal. */
  lemma MissingExample(nature: Journal, m: Store)
    requires nature.id == "journal_1" && nature.name == "Nature" && nature.impactFactor == 64.8
    requires m == map[nature.id := nature]
    ensures JournalCore.GetJournal(Port(), m, "missing").0 == Failure(ZeroJournal, Other(MissingText))
  {
    assert "missing" !in m;
  }

  /** A worked example: the demonstration journal with impact factor -1.0 is
      turned away with an invalid-impact-factor error, and the store is left
      as it was. */
  lemma NegativeImpactFactorExample(nature: Journal, m: Store)
    requires nature.id == "journal_1" && nature.name == "Nature" && nature.impactFactor == 64.8
    ensures JournalCore.CreateJournal(Port(), m, nature.(impactFactor := -1.0))
            == (Failure(ZeroJournal, Invalid(ImpactFactor)), m)
  {
    NatureIsValid(nature);
  }
}
