/** The stored exam collection and the changes the form, the card buttons and
    the clear button make to it. The collection is the value the store holds;
    each change is a pure function from the old collection to the new one. */
module Exams {

  import opened Wrappers
  import opened Strings

  /** One stored exam. Every field is the string the form produced; `id` and
      `createdAt` are opaque values supplied by the caller. */
  datatype Exam = Exam(
    id: string,
    course: string,
    examType: string,
    datetime: string,
    seat: string,
    building: string,
    room: string,
    notes: string,
    createdAt: string)

  /** The raw values of the form fields. */
  datatype Form = Form(
    course: string,
    examType: string,
    datetime: string,
    seat: string,
    building: string,
    room: string,
    notes: string)

  /** A submission is kept only when the trimmed course and the date are set. */
  predicate Accepts(form: Form) {
    Trim(form.course) != [] && form.datetime != []
  }

  /** The record a submission creates: the free-text fields are trimmed, the
      type and the date are taken as they are. */
  function RecordOf(form: Form, id: string, createdAt: string): Exam {
    Exam(id, Trim(form.course), form.examType, form.datetime,
         Trim(form.seat), Trim(form.building), Trim(form.room), Trim(form.notes), createdAt)
  }

  /** What every record entering through the form satisfies. */
  predicate WellFormed(e: Exam) {
    && e.course != [] && e.datetime != []
    && Trimmed(e.course) && Trimmed(e.seat) && Trimmed(e.building)
    && Trimmed(e.room) && Trimmed(e.notes)
  }

  predicate AllWellFormed(exams: seq<Exam>) {
    forall k :: 0 <= k < |exams| ==> WellFormed(exams[k])
  }

  /** No two records share an id. */
  predicate UniqueIds(exams: seq<Exam>) {
    forall j, k :: 0 <= j < k < |exams| ==> exams[j].id != exams[k].id
  }

  /** Every record is well formed and no two records share an id. */
  predicate Valid(exams: seq<Exam>) {
    AllWellFormed(exams) && UniqueIds(exams)
  }

  predicate HasId(exams: seq<Exam>, id: string) {
    exists k :: 0 <= k < |exams| && exams[k].id == id
  }

  /** The form's submit handler: a rejected submission changes nothing, an
      accepted one appends exactly one record and keeps every other record in
      its place. */
  function Submit(exams: seq<Exam>, form: Form, id: string, createdAt: string): (r: seq<Exam>)
    ensures !Accepts(form) ==> r == exams
    ensures Accepts(form) ==>
      && |r| == |exams| + 1 && r[..|exams|] == exams
      && r[|exams|].id == id && r[|exams|].createdAt == createdAt
      && r[|exams|].course == Trim(form.course) && r[|exams|].examType == form.examType
      && r[|exams|].datetime == form.datetime && r[|exams|].seat == Trim(form.seat)
      && r[|exams|].building == Trim(form.building) && r[|exams|].room == Trim(form.room)
      && r[|exams|].notes == Trim(form.notes)
      && WellFormed(r[|exams|])
  {
    if !Accepts(form) then exams
    else
      exams + [RecordOf(form, id, createdAt)]
  }

  /** Submitting with an id no record has keeps the collection valid. */
  lemma SubmitKeepsValid(exams: seq<Exam>, form: Form, id: string, createdAt: string)
    requires Valid(exams) && !HasId(exams, id)
    ensures Valid(Submit(exams, form, id, createdAt))
  {
    if Accepts(form) {
      var r := Submit(exams, form, id, createdAt);
      assert forall k :: 0 <= k < |exams| ==> r[k] == exams[k];
      forall j, k | 0 <= j < k < |r| ensures r[j].id != r[k].id {
        if k == |exams| {
          assert r[j].id == exams[j].id;
        }
      }
    }
  }

  /** `i` is the first index holding a record with `id` (`findIndex`). */
  predicate FirstAt(exams: seq<Exam>, id: string, i: int) {
    && 0 <= i < |exams| && exams[i].id == id
    && forall k :: 0 <= k < i ==> exams[k].id != id
  }

  /** `exams.findIndex(e => e.id === id)`, with `None` for -1. */
  function FindIndex(exams: seq<Exam>, id: string): (r: Option<nat>)
    ensures r.None? <==> !HasId(exams, id)
    ensures r.Some? ==> FirstAt(exams, id, r.value)
  {
    if exams == [] then None
    else if exams[0].id == id then Some(0)
    else match FindIndex(exams[1..], id)
      case None =>
        assert forall k :: 1 <= k < |exams| ==> exams[k] == exams[1..][k - 1];
        None
      case Some(i) => Some(i + 1)
  }

  /** `exams.splice(idx, 1)` at the first record with `id`: an absent id
      changes nothing; otherwise exactly that record goes and the others keep
      their order. */
  function RemoveFirst(exams: seq<Exam>, id: string): (r: seq<Exam>)
    ensures !HasId(exams, id) ==> r == exams
    ensures HasId(exams, id) ==>
      exists i :: FirstAt(exams, id, i) && r == exams[..i] + exams[i + 1..]
    ensures HasId(exams, id) ==> |r| == |exams| - 1 && multiset(r) < multiset(exams)
  {
    match FindIndex(exams, id)
    case None => exams
    case Some(i) =>
      assert exams == exams[..i] + [exams[i]] + exams[i + 1..];
      exams[..i] + exams[i + 1..]
  }

  /** Where each element of a sequence ends up once index `i` is cut out. */
  lemma RemovedAt<T>(s: seq<T>, i: int, r: seq<T>)
    requires 0 <= i < |s| && r == s[..i] + s[i + 1..]
    ensures |r| == |s| - 1
    ensures forall k :: 0 <= k < i ==> r[k] == s[k]
    ensures forall k :: i <= k < |r| ==> r[k] == s[k + 1]
  {
  }

  /** With unique ids the removal takes away the one record with that id and
      keeps every other record. */
  lemma RemoveFirstUnique(exams: seq<Exam>, id: string)
    requires UniqueIds(exams)
    ensures !HasId(RemoveFirst(exams, id), id)
    ensures forall e :: e in exams && e.id != id ==> e in RemoveFirst(exams, id)
  {
    if HasId(exams, id) {
      var i := FindIndex(exams, id).value;
      var r := RemoveFirst(exams, id);
      RemovedAt(exams, i, r);
      forall k | 0 <= k < |r| ensures r[k].id != id {
      }
      forall e | e in exams && e.id != id ensures e in r {
        var m :| 0 <= m < |exams| && exams[m] == e;
        assert r[if m < i then m else m - 1] == e;
      }
    }
  }

  /** Removing a record keeps the collection valid. */
  lemma RemoveFirstKeepsValid(exams: seq<Exam>, id: string)
    requires Valid(exams)
    ensures Valid(RemoveFirst(exams, id))
  {
    if HasId(exams, id) {
      var i := FindIndex(exams, id).value;
      var r := RemoveFirst(exams, id);
      RemovedAt(exams, i, r);
      assert UniqueIds(r) by {
        forall j, k | 0 <= j < k < |r| ensures r[j].id != r[k].id {
          var mj, mk := if j < i then j else j + 1, if k < i then k else k + 1;
          assert exams[mj].id != exams[mk].id;
          assert r[j] == exams[mj] && r[k] == exams[mk];
        }
      }
      assert AllWellFormed(r) by {
        forall k | 0 <= k < |r| ensures WellFormed(r[k]) {
          var m := if k < i then k else k + 1;
          assert WellFormed(exams[m]);
          assert r[k] == exams[m];
        }
      }
    }
  }

  /** The form values an edit puts back for the user to correct and resubmit;
      a missing type falls back to "Final". */
  function FormOf(e: Exam): Form {
    Form(e.course, if e.examType == [] then "Final" else e.examType, e.datetime,
         e.seat, e.building, e.room, e.notes)
  }

  /** The outcome of a card button: the new collection and, for an edit, the
      values put back in the form. */
  datatype ClickOutcome = ClickOutcome(exams: seq<Exam>, prefill: Option<Form>)

  /** The list's click handler for the button with `action` on card `id`.
      An unknown id or action changes nothing; "del" removes the record;
      "edit" removes it and hands its values to the form. */
  function Click(exams: seq<Exam>, action: string, id: string): (r: ClickOutcome)
    ensures !HasId(exams, id) || (action != "del" && action != "edit") ==>
              r == ClickOutcome(exams, None)
    ensures HasId(exams, id) && action == "del" ==>
              r == ClickOutcome(RemoveFirst(exams, id), None)
    ensures HasId(exams, id) && action == "edit" ==>
              && r.exams == RemoveFirst(exams, id)
              && exists i :: FirstAt(exams, id, i) && r.prefill == Some(FormOf(exams[i]))
  {
    match FindIndex(exams, id)
    case None => ClickOutcome(exams, None)
    case Some(i) =>
      if action == "del" then ClickOutcome(RemoveFirst(exams, id), None)
      else if action == "edit" then ClickOutcome(RemoveFirst(exams, id), Some(FormOf(exams[i])))
      else ClickOutcome(exams, None)
  }

  /** The free-text fields of a well-formed record are left alone by
      trimming. */
  lemma WellFormedTrimmed(e: Exam)
    requires WellFormed(e)
    ensures Trim(e.course) == e.course && Trim(e.seat) == e.seat
    ensures Trim(e.building) == e.building && Trim(e.room) == e.room
    ensures Trim(e.notes) == e.notes
  {
    assert Trimmed(e.course) && Trimmed(e.seat) && Trimmed(e.building);
    assert Trimmed(e.room) && Trimmed(e.notes);
    TrimOfTrimmed(e.course);
    TrimOfTrimmed(e.seat);
    TrimOfTrimmed(e.building);
    TrimOfTrimmed(e.room);
    TrimOfTrimmed(e.notes);
  }

  /** A record whose free-text fields are already trimmed, put back in the
      form, is accepted again and gives the same record under the new id. */
  lemma ResubmitRecord(e: Exam, newId: string, createdAt: string)
    requires e.course != [] && e.datetime != []
    requires Trim(e.course) == e.course && Trim(e.seat) == e.seat
    requires Trim(e.building) == e.building && Trim(e.room) == e.room
    requires Trim(e.notes) == e.notes
    ensures Accepts(FormOf(e))
    ensures RecordOf(FormOf(e), newId, createdAt)
         == e.(id := newId, createdAt := createdAt, examType := FormOf(e).examType)
  {
  }

  /** Editing and resubmitting unchanged moves the record to the end under
      its new id, with the same field values; nothing else changes. */
  lemma EditThenResubmit(exams: seq<Exam>, id: string, newId: string, createdAt: string)
    requires AllWellFormed(exams) && HasId(exams, id)
    ensures var out := Click(exams, "edit", id);
      var i := FindIndex(exams, id).value;
      var e := exams[i];
      && out.prefill.Some?
      && Submit(out.exams, out.prefill.value, newId, createdAt)
         == exams[..i] + exams[i + 1..]
            + [e.(id := newId, createdAt := createdAt, examType := FormOf(e).examType)]
  {
    var i := FindIndex(exams, id).value;
    var e := exams[i];
    var out := Click(exams, "edit", id);
    assert out == ClickOutcome(exams[..i] + exams[i + 1..], Some(FormOf(e)));
    WellFormedTrimmed(e);
    ResubmitRecord(e, newId, createdAt);
  }

  /** The clear button: confirmed, the stored collection becomes empty;
      declined, nothing changes. */
  function Clear(exams: seq<Exam>, confirmed: bool): (r: seq<Exam>)
    ensures confirmed ==> r == []
    ensures !confirmed ==> r == exams
  {
    if confirmed then [] else exams
  }
}
