// The Activity collection (backend/src/models/Activity.js) and the two store
// operations the controllers use: saving a new document, and
// `findByIdAndUpdate` with a `$set` document. The collection is a map from id
// to record; `order` remembers the order of insertion, the order in which a
// query sees the documents before sorting.

module ActivityModel {
  import opened JsValues
  import opened Jwt

  /** The text of a document's ObjectId. */
  type Id = string

  const Pending: string := "pending"

  /** The message Mongoose gives when `student_id` is absent, null or empty. */
  const StudentIdRequired: string := "Activity validation failed: student_id: Path `student_id` is required."

  /**
   * A stored activity. Besides the schema's fields (`type` is `kind` here) it
   * holds the fields the controllers read or `$set`: `student_name`,
   * `moderator`, `comment`, `verifiedAt`, `pdfUrl` and `jwt`.
   */
  datatype Activity = Activity(
    id: Id,
    studentId: string,
    studentName: Js<string>,
    kind: Js<string>,
    title: Js<string>,
    date: Js<Time>,
    hours: Js<int>,
    description: Js<string>,
    evidenceUrl: Js<string>,
    status: Js<string>,
    moderator: Js<string>,
    comment: Js<string>,
    verifiedAt: Js<Time>,
    pdfUrl: Js<string>,
    jwt: Js<Token>,
    createdAt: Time,
    updatedAt: Time)

  /** The body `createActivity` hands to `new Activity(data)`. */
  datatype ActivityBody = ActivityBody(
    studentId: Js<string>,
    studentName: Js<string>,
    kind: Js<string>,
    title: Js<string>,
    date: Js<Time>,
    hours: Js<int>,
    description: Js<string>,
    evidenceUrl: Js<string>,
    status: Js<string>)

  /**
   * `new Activity(body)` followed by `save()`: the required-path validator
   * rejects a missing, null or empty `student_id`; `status` takes its default
   * only when the body leaves it undefined; both timestamps are the save time.
   */
  function NewActivity(body: ActivityBody, id: Id, now: Time): (r: Result<Activity, string>)
    ensures r.Failure? <==> !TruthyStr(body.studentId)
    ensures r.Failure? ==> r.error == StudentIdRequired
    ensures r.Success? ==>
      && r.value.id == id
      && r.value.studentId == body.studentId.v
      && r.value.status == (if body.status.Undefined? then Val(Pending) else body.status)
      && r.value.title == body.title && r.value.hours == body.hours && r.value.date == body.date
      && r.value.studentName == body.studentName && r.value.kind == body.kind
      && r.value.description == body.description && r.value.evidenceUrl == body.evidenceUrl
      && r.value.createdAt == now && r.value.updatedAt == now
      && r.value.moderator.Undefined? && r.value.comment.Undefined? && r.value.verifiedAt.Undefined?
      && r.value.pdfUrl.Undefined? && r.value.jwt.Undefined?
  {
    if !TruthyStr(body.studentId) then Failure(StudentIdRequired)
    else
      Success(Activity(
        id, body.studentId.v, body.studentName, body.kind, body.title, body.date, body.hours,
        body.description, body.evidenceUrl,
        if body.status.Undefined? then Val(Pending) else body.status,
        Undefined, Undefined, Undefined, Undefined, Undefined, now, now))
  }

  /** A `$set` document: each present field overwrites the stored one. */
  datatype SetFields = SetFields(
    status: Option<string>,
    moderator: Option<Js<string>>,
    comment: Option<Js<string>>,
    verifiedAt: Option<Time>,
    pdfUrl: Option<string>,
    jwt: Option<Token>)

  /** `{ $set: fields }` with the schema's `timestamps` option, which also sets `updatedAt`. */
  function ApplySet(a: Activity, s: SetFields, at: Time): (r: Activity)
    ensures r.id == a.id && r.studentId == a.studentId && r.createdAt == a.createdAt
    ensures r.updatedAt == at
    ensures r.status == (if s.status.Some? then Val(s.status.value) else a.status)
    ensures r.moderator == s.moderator.GetOr(a.moderator)
    ensures r.comment == s.comment.GetOr(a.comment)
    ensures r.verifiedAt == (if s.verifiedAt.Some? then Val(s.verifiedAt.value) else a.verifiedAt)
    ensures r.pdfUrl == (if s.pdfUrl.Some? then Val(s.pdfUrl.value) else a.pdfUrl)
    ensures r.jwt == (if s.jwt.Some? then Val(s.jwt.value) else a.jwt)
    ensures r.(status := a.status, moderator := a.moderator, comment := a.comment,
               verifiedAt := a.verifiedAt, pdfUrl := a.pdfUrl, jwt := a.jwt, updatedAt := a.updatedAt) == a
  {
    a.(
      status := if s.status.Some? then Val(s.status.value) else a.status,
      moderator := s.moderator.GetOr(a.moderator),
      comment := s.comment.GetOr(a.comment),
      verifiedAt := if s.verifiedAt.Some? then Val(s.verifiedAt.value) else a.verifiedAt,
      pdfUrl := if s.pdfUrl.Some? then Val(s.pdfUrl.value) else a.pdfUrl,
      jwt := if s.jwt.Some? then Val(s.jwt.value) else a.jwt,
      updatedAt := at)
  }

  class ActivityStore {
    var records: map<Id, Activity>
    var order: seq<Id>

    /** Every record is stored under its own id, and `order` lists each id exactly once. */
    ghost predicate Valid()
      reads this
    {
      && (forall id | id in records :: records[id].id == id)
      && (forall i | 0 <= i < |order| :: order[i] in records)
      && (forall id | id in records :: id in order)
      && (forall i, j | 0 <= i < j < |order| :: order[i] != order[j])
    }

    constructor ()
      ensures Valid() && records == map[] && order == []
    {
      records := map[];
      order := [];
    }

    /** The documents in insertion order, as a query sees them before sorting. */
    function Docs(): (docs: seq<Activity>)
      reads this
      requires Valid()
      ensures |docs| == |order|
      ensures forall a | a in docs :: a.id in records && records[a.id] == a
      ensures forall id | id in records :: records[id] in docs
    {
      var docs := seq(|order|, i requires 0 <= i < |order| && order[i] in records reads this => records[order[i]]);
      assert forall id | id in records :: records[id] in docs by {
        forall id | id in records ensures records[id] in docs {
          var i :| 0 <= i < |order| && order[i] == id;
          assert docs[i] == records[id];
        }
      }
      docs
    }

    /** `new Activity(body).save()`; the id generator never repeats an id. */
    method Create(body: ActivityBody, id: Id, now: Time) returns (r: Result<Activity, string>)
      requires Valid()
      requires id !in records
      modifies this
      ensures Valid()
      ensures r == NewActivity(body, id, now)
      ensures r.Success? ==> records == old(records)[id := r.value] && order == old(order) + [id]
      ensures r.Failure? ==> records == old(records) && order == old(order)
    {
      r := NewActivity(body, id, now);
      if r.Success? {
        records := records[id := r.value];
        order := order + [id];
      }
    }

    /** `Activity.findByIdAndUpdate(id, { $set }, { new: true })`: the updated record, or null. */
    method FindByIdAndUpdate(id: Id, s: SetFields, at: Time) returns (updated: Option<Activity>)
      requires Valid()
      modifies this
      ensures Valid() && order == old(order)
      ensures id in old(records) ==>
        updated == Some(ApplySet(old(records)[id], s, at)) && records == old(records)[id := updated.value]
      ensures id !in old(records) ==> updated == None && records == old(records)
    {
      if id in records {
        var a := ApplySet(records[id], s, at);
        records := records[id := a];
        updated := Some(a);
      } else {
        updated := None;
      }
    }
  }
}
