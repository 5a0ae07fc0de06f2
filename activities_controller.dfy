// backend/src/controllers/activitiesController.js: creating an activity, the
// moderator's listing query, and `verifyActivity`, the moderation transition
// that on approval signs a credential, writes a PDF certificate and stores
// both on the record in a second update.
//
// `Transition` states the whole effect of one `verifyActivity` request on the
// record store and the PDF directory; the method `VerifyActivity` performs
// the same steps one write at a time and is proved to agree with it. The
// lemmas below are properties of `Transition`.

module ActivitiesController {
  import opened JsValues
  import opened Jwt
  import opened ActivityModel

  const Approved: string := "approved"
  const Rejected: string := "rejected"
  const DefaultIssuer: string := "http://localhost:5000"
  const PdfPrefix: string := "/public/pdfs/"
  const PdfSuffix: string := ".pdf"

  /** The JSON body of `POST /activities/:id/verify`. */
  datatype VerifyRequest = VerifyRequest(action: Js<string>, moderator: Js<string>, comment: Js<string>)

  /** The three clock readings of one request: the status update, signing, and the credential update. */
  datatype Clock = Clock(patchAt: Time, issueAt: Time, finalAt: Time)

  /** How writing the PDF to its file ended. */
  datatype SinkResult = Flushed | WriteFailed(message: string)

  datatype DateCell = NoDate | LocaleDate(t: Time)
  datatype HoursCell = NoHours | HoursValue(n: int)

  /** The lines of the certificate PDF, with their fallbacks already applied. */
  datatype Certificate = Certificate(
    student: string,
    studentId: string,
    activity: string,
    date: DateCell,
    hours: HoursCell,
    verifiedBy: string,
    verificationDate: Time,
    comments: string)

  datatype ActivityResponse =
    | InvalidAction                                              // 400 { error: 'Invalid action' }
    | NotFound                                                   // 404 { error: 'Activity not found' }
    | RejectedOk(activity: Activity)                             // 200 { success, message, activity }
    | ApprovedOk(pdfUrl: string, token: Token, activity: Activity) // 200 { success, message, pdfUrl, token, activity }
    | ServerError(details: string)                               // 500 { error, details }
  {
    function Code(): int {
      match this
      case InvalidAction => 400
      case NotFound => 404
      case RejectedOk(_) => 200
      case ApprovedOk(_, _, _) => 200
      case ServerError(_) => 500
    }
  }

  /** The response together with the store and the PDF directory after the request. */
  datatype Outcome = Outcome(response: ActivityResponse, records: map<Id, Activity>, documents: map<string, Certificate>)

  /** `['approved', 'rejected'].includes(action)`. */
  predicate IsAction(action: Js<string>) {
    action == Val(Approved) || action == Val(Rejected)
  }

  /** The first `$set`: status and `verifiedAt` always, `moderator` only if truthy, `comment` unless undefined. */
  function StatusPatch(req: VerifyRequest, now: Time): (p: SetFields)
    ensures p.status.Some? && (req.action == Val(Approved) <==> p.status.value == Approved)
    ensures p.verifiedAt == Some(now)
    ensures p.moderator.Some? <==> TruthyStr(req.moderator)
    ensures p.comment.Some? <==> !req.comment.Undefined?
    ensures p.moderator.Some? ==> p.moderator.value == req.moderator
    ensures p.comment.Some? ==> p.comment.value == req.comment
    ensures p.pdfUrl.None? && p.jwt.None?
  {
    SetFields(
      status := Some(if req.action == Val(Approved) then Approved else Rejected),
      moderator := if TruthyStr(req.moderator) then Some(req.moderator) else None,
      comment := if !req.comment.Undefined? then Some(req.comment) else None,
      verifiedAt := Some(now),
      pdfUrl := None,
      jwt := None)
  }

  /** The second `$set`: exactly `pdfUrl` and `jwt`. */
  function CredentialPatch(url: string, token: Token): (p: SetFields)
    ensures p.status.None? && p.moderator.None? && p.comment.None? && p.verifiedAt.None?
    ensures p.pdfUrl == Some(url) && p.jwt == Some(token)
  {
    SetFields(None, None, None, None, Some(url), Some(token))
  }

  /** `process.env.ISS || 'http://localhost:5000'`. */
  function IssuerOf(env: Env): (iss: string)
    ensures iss != ""
    ensures env.iss.Some? && env.iss.value != "" ==> iss == env.iss.value
    ensures env.iss.None? || env.iss.value == "" ==> iss == DefaultIssuer
  {
    if env.iss.Some? && env.iss.value != "" then env.iss.value else DefaultIssuer
  }

  /** The credential payload built from the once-updated record (lines 78-99). */
  function BuildClaims(u: Activity, req: VerifyRequest, env: Env, issueAt: Time): (c: Claims)
    ensures c.exp.None?
    ensures c.iss == IssuerOf(env) && c.iat == issueAt / 1000
    ensures c.sub == "student:" + u.studentId && c.jti == "activity:" + u.id
    ensures c.vc.types == CredentialTypes
    ensures c.vc.credentialSubject.studentId == u.studentId && c.vc.credentialSubject.name == u.studentName
    ensures c.vc.credentialSubject.activity.title == u.title
    ensures c.vc.credentialSubject.verifiedBy != ""
    ensures TruthyStr(req.moderator) ==> c.vc.credentialSubject.verifiedBy == req.moderator.v
    ensures !TruthyStr(req.moderator) ==> c.vc.credentialSubject.verifiedBy == StrOr(u.moderator, "Unknown")
    ensures c.vc.credentialSubject.verifiedAt == issueAt
    ensures c.vc.credentialSubject.activity.date == ObjOrNull(u.date)
    ensures c.vc.credentialSubject.activity.hours == NumOrNull(u.hours)
    ensures c.vc.credentialSubject.activity.description == StrOrNull(u.description)
    ensures c.vc.credentialSubject.activity.evidenceUrl == StrOrNull(u.evidenceUrl)
    ensures c.vc.credentialSubject.activity.hours.Null? <==> !TruthyNum(u.hours)
    ensures c.vc.credentialSubject.activity.description.Null? <==> !TruthyStr(u.description)
  {
    Claims(
      iss := IssuerOf(env),
      sub := "student:" + u.studentId,
      jti := "activity:" + u.id,
      iat := issueAt / 1000,
      vc := Credential(
        CredentialTypes,
        CredentialSubject(
          studentId := u.studentId,
          name := u.studentName,
          activity := ActivityClaim(
            title := u.title,
            date := ObjOrNull(u.date),
            hours := NumOrNull(u.hours),
            description := StrOrNull(u.description),
            evidenceUrl := StrOrNull(u.evidenceUrl)),
          verifiedBy := if TruthyStr(req.moderator) then req.moderator.v else StrOr(u.moderator, "Unknown"),
          verifiedAt := issueAt)),
      exp := None)
  }

  /** The certificate's lines (118-130); `hours` uses `??`, so 0 is printed. */
  function RenderCertificate(u: Activity, req: VerifyRequest, at: Time): (cert: Certificate)
    ensures cert.student != "" && cert.studentId != "" && cert.activity != ""
    ensures cert.student == StrOr(u.studentName, "N/A")
    ensures cert.studentId == StrOr(Val(u.studentId), "N/A")
    ensures cert.activity == StrOr(u.title, "N/A")
    ensures cert.verifiedBy != "" && cert.comments != ""
    ensures TruthyStr(req.moderator) ==> cert.verifiedBy == req.moderator.v
    ensures !TruthyStr(req.moderator) ==> cert.verifiedBy == StrOr(u.moderator, "N/A")
    ensures TruthyStr(req.comment) ==> cert.comments == req.comment.v
    ensures !TruthyStr(req.comment) ==> cert.comments == StrOr(u.comment, "None")
    ensures cert.hours.HoursValue? <==> u.hours.Val?
    ensures u.hours.Val? ==> cert.hours == HoursValue(u.hours.v)
    ensures cert.date.LocaleDate? <==> u.date.Val?
    ensures u.date.Val? ==> cert.date == LocaleDate(u.date.v)
    ensures cert.verificationDate == at
  {
    Certificate(
      student := StrOr(u.studentName, "N/A"),
      studentId := StrOr(Val(u.studentId), "N/A"),
      activity := StrOr(u.title, "N/A"),
      date := if u.date.Val? then LocaleDate(u.date.v) else NoDate,
      hours := if u.hours.Val? then HoursValue(u.hours.v) else NoHours,
      verifiedBy := if TruthyStr(req.moderator) then req.moderator.v else StrOr(u.moderator, "N/A"),
      verificationDate := at,
      comments := if TruthyStr(req.comment) then req.comment.v else StrOr(u.comment, "None"))
  }

  /** The certificate's public locator, `/public/pdfs/<id>.pdf`. */
  function PdfUrl(id: Id): (url: string)
    ensures |url| == |PdfPrefix| + |id| + |PdfSuffix|
    ensures url[..|PdfPrefix|] == PdfPrefix && url[|PdfPrefix| + |id|..] == PdfSuffix
    ensures url[|PdfPrefix|..|PdfPrefix| + |id|] == id
  {
    PdfPrefix + id + PdfSuffix
  }

  /** The whole of one `verifyActivity` request. */
  function Transition(records: map<Id, Activity>, documents: map<string, Certificate>, id: Id,
                      req: VerifyRequest, env: Env, clock: Clock, sink: SinkResult): (o: Outcome)
    ensures o.response.InvalidAction? <==> !IsAction(req.action)
    ensures o.response.NotFound? <==> IsAction(req.action) && id !in records
    ensures o.records.Keys == records.Keys
    ensures forall k | k in records && k != id :: o.records[k] == records[k]
    ensures o.response.Code() != 200 ==> o.documents == documents
    ensures id in records ==> o.documents.Keys <= documents.Keys + {PdfUrl(records[id].id)}
    ensures o.response.ApprovedOk? <==> req.action == Val(Approved) && id in records && sink.Flushed?
    ensures o.response.RejectedOk? <==> req.action == Val(Rejected) && id in records
  {
    if !IsAction(req.action) then Outcome(InvalidAction, records, documents)
    else if id !in records then Outcome(NotFound, records, documents)
    else
      var updated := ApplySet(records[id], StatusPatch(req, clock.patchAt), clock.patchAt);
      var afterStatus := records[id := updated];
      if req.action != Val(Approved) then Outcome(RejectedOk(updated), afterStatus, documents)
      else
        match Sign(BuildClaims(updated, req, env, clock.issueAt), SecretOf(env), HS256, YearSeconds, clock.issueAt / 1000)
        case Failure(_) => Outcome(ServerError("signing failed"), afterStatus, documents)
        case Success(token) =>
          match sink
          case WriteFailed(message) => Outcome(ServerError(message), afterStatus, documents)
          case Flushed =>
            var url := PdfUrl(updated.id);
            var final := ApplySet(updated, CredentialPatch(url, token), clock.finalAt);
            Outcome(ApprovedOk(url, token, final), afterStatus[id := final],
                    documents[url := RenderCertificate(updated, req, clock.issueAt)])
  }

  /** The `public/pdfs` directory: one certificate per file name. */
  class PdfDirectory {
    var documents: map<string, Certificate>

    constructor ()
      ensures documents == map[]
    {
      documents := map[];
    }

    /** Pipes the rendered certificate into the file at `url` and waits for `finish` or `error`. */
    method Write(url: string, cert: Certificate, sink: SinkResult) returns (ok: bool)
      modifies this
      ensures ok <==> sink.Flushed?
      ensures documents == if ok then old(documents)[url := cert] else old(documents)
    {
      ok := sink.Flushed?;
      if ok {
        documents := documents[url := cert];
      }
    }
  }

  /** `verifyActivity`, step by step: validate, first update, then on approval sign, write the PDF, second update. */
  method VerifyActivity(store: ActivityStore, pdfs: PdfDirectory, id: Id, req: VerifyRequest,
                        env: Env, clock: Clock, sink: SinkResult) returns (resp: ActivityResponse)
    requires store.Valid()
    modifies store, pdfs
    ensures store.Valid() && store.order == old(store.order)
    ensures Outcome(resp, store.records, pdfs.documents)
         == Transition(old(store.records), old(pdfs.documents), id, req, env, clock, sink)
  {
    if !IsAction(req.action) {
      return InvalidAction;
    }
    var updated := store.FindByIdAndUpdate(id, StatusPatch(req, clock.patchAt), clock.patchAt);
    if updated.None? {
      return NotFound;
    }
    var u := updated.value;
    if req.action != Val(Approved) {
      return RejectedOk(u);
    }
    var signed := Sign(BuildClaims(u, req, env, clock.issueAt), SecretOf(env), HS256, YearSeconds, clock.issueAt / 1000);
    if signed.Failure? {
      return ServerError("signing failed");
    }
    var token := signed.value;
    var url := PdfUrl(u.id);
    var written := pdfs.Write(url, RenderCertificate(u, req, clock.issueAt), sink);
    if !written {
      return ServerError(sink.message);
    }
    var final := store.FindByIdAndUpdate(id, CredentialPatch(url, token), clock.finalAt);
    if final.None? {
      // `finalActivity._id` on null throws a TypeError, caught as a 500.
      return ServerError("Cannot read properties of null (reading '_id')");
    }
    resp := ApprovedOk(url, token, final.value);
  }

  /** `createActivity`: 201 with the saved record, or 400 with the validation message. */
  method CreateActivity(store: ActivityStore, body: ActivityBody, id: Id, now: Time) returns (code: int, r: Result<Activity, string>)
    requires store.Valid() && id !in store.records
    modifies store
    ensures store.Valid()
    ensures r == NewActivity(body, id, now)
    ensures code == (if r.Success? then 201 else 400)
    ensures r.Success? ==> store.records == old(store.records)[id := r.value] && id in store.records
    ensures r.Failure? ==> store.records == old(store.records)
  {
    r := store.Create(body, id, now);
    code := if r.Success? then 201 else 400;
  }

  // ----- the listing query of getPendingActivities -----

  const ListLimit: nat := 200

  /** `req.query.status || 'pending'`. */
  function StatusQuery(q: Option<string>): (s: string)
    ensures s != ""
    ensures q.Some? && q.value != "" ==> s == q.value
    ensures q.None? || q.value == "" ==> s == Pending
  {
    if q.Some? && q.value != "" then q.value else Pending
  }

  /** `{ status }` as a filter. */
  function WithStatus(docs: seq<Activity>, s: string): (r: seq<Activity>)
    ensures forall a | a in r :: a in docs && a.status == Val(s)
    ensures forall a | a in docs && a.status == Val(s) :: a in r
    ensures multiset(r) <= multiset(docs)
  {
    if docs == [] then []
    else
      var rest := WithStatus(docs[1..], s);
      assert docs == [docs[0]] + docs[1..];
      if docs[0].status == Val(s) then [docs[0]] + rest else rest
  }

  ghost predicate NewestFirst(s: seq<Activity>) {
    forall i, j | 0 <= i < j < |s| :: s[i].createdAt >= s[j].createdAt
  }

  function InsertNewest(a: Activity, s: seq<Activity>): (r: seq<Activity>)
    requires NewestFirst(s)
    ensures NewestFirst(r)
    ensures multiset(r) == multiset(s) + multiset{a}
    ensures |r| == |s| + 1
    ensures s == [] ==> r == [a]
    ensures s != [] ==> r[0] == a || r[0] == s[0]
  {
    if s == [] || a.createdAt >= s[0].createdAt then
      ConsNewestFirst(a, s);
      [a] + s
    else
      var rest := InsertNewest(a, s[1..]);
      assert s == [s[0]] + s[1..];
      ConsNewestFirst(s[0], rest);
      [s[0]] + rest
  }

  /** A document no older than the head of a newest-first list can go in front of it. */
  lemma ConsNewestFirst(a: Activity, s: seq<Activity>)
    requires NewestFirst(s) && (s == [] || a.createdAt >= s[0].createdAt)
    ensures NewestFirst([a] + s)
  {
    var r := [a] + s;
    forall i, j | 0 <= i < j < |r| ensures r[i].createdAt >= r[j].createdAt {
      if i == 0 && j > 1 {
        assert s[0].createdAt >= s[j - 1].createdAt;
      }
    }
  }

  /** `.sort({ createdAt: -1 })`. */
  function SortNewestFirst(s: seq<Activity>): (r: seq<Activity>)
    ensures NewestFirst(r)
    ensures multiset(r) == multiset(s)
    ensures |r| == |s|
  {
    if s == [] then []
    else
      assert s == [s[0]] + s[1..];
      InsertNewest(s[0], SortNewestFirst(s[1..]))
  }

  lemma NewestFirstPrefix(s: seq<Activity>, n: nat)
    requires NewestFirst(s) && n <= |s|
    ensures NewestFirst(s[..n])
  {
    forall i, j | 0 <= i < j < n ensures s[..n][i].createdAt >= s[..n][j].createdAt {
      assert s[..n][i] == s[i] && s[..n][j] == s[j];
    }
  }

  /** What is left out of a newest-first prefix is no newer than anything kept. */
  lemma PrefixKeepsNewest(sorted: seq<Activity>, n: nat)
    requires NewestFirst(sorted) && n <= |sorted|
    ensures forall a, b | a in sorted && a !in sorted[..n] && b in sorted[..n] :: a.createdAt <= b.createdAt
  {
    forall a, b | a in sorted && a !in sorted[..n] && b in sorted[..n] ensures a.createdAt <= b.createdAt {
      var i :| 0 <= i < |sorted| && sorted[i] == a;
      var j :| 0 <= j < n && sorted[..n][j] == b;
      assert sorted[j] == b;
      assert i >= n;
    }
  }

  /** The facts about a newest-first prefix of the matching documents that `ListActivities` promises. */
  lemma PrefixOfMatches(docs: seq<Activity>, s: string, sorted: seq<Activity>, n: nat)
    requires NewestFirst(sorted) && multiset(sorted) == multiset(WithStatus(docs, s)) && n <= |sorted|
    ensures forall a | a in sorted[..n] :: a in docs && a.status == Val(s)
    ensures multiset(sorted[..n]) <= multiset(docs)
    ensures forall a, b | a in WithStatus(docs, s) && a !in sorted[..n] && b in sorted[..n] :: a.createdAt <= b.createdAt
  {
    var matching := WithStatus(docs, s);
    assert sorted == sorted[..n] + sorted[n..];
    assert multiset(sorted) == multiset(sorted[..n]) + multiset(sorted[n..]);
    forall a | a in sorted[..n] ensures a in docs && a.status == Val(s) {
      assert a in multiset(matching);
    }
    forall a | a in matching ensures a in sorted {
      assert a in multiset(sorted);
    }
    PrefixKeepsNewest(sorted, n);
  }

  /** `Activity.find({ status }).sort({ createdAt: -1 }).limit(200)`. */
  function ListActivities(docs: seq<Activity>, q: Option<string>): (r: seq<Activity>)
    ensures |r| == if |WithStatus(docs, StatusQuery(q))| < ListLimit then |WithStatus(docs, StatusQuery(q))| else ListLimit
    ensures forall a | a in r :: a in docs && a.status == Val(StatusQuery(q))
    ensures NewestFirst(r)
    ensures multiset(r) <= multiset(docs)
    ensures forall a, b | a in WithStatus(docs, StatusQuery(q)) && a !in r && b in r :: a.createdAt <= b.createdAt
  {
    var matching := WithStatus(docs, StatusQuery(q));
    var sorted := SortNewestFirst(matching);
    var n := if |matching| < ListLimit then |matching| else ListLimit;
    PrefixOfMatches(docs, StatusQuery(q), sorted, n);
    NewestFirstPrefix(sorted, n);
    sorted[..n]
  }

  /** `getPendingActivities`: the listing of the store's documents for the requested status. */
  method GetPendingActivities(store: ActivityStore, q: Option<string>) returns (r: seq<Activity>)
    requires store.Valid()
    ensures forall a | a in r :: a.id in store.records && store.records[a.id] == a && a.status == Val(StatusQuery(q))
    ensures |r| <= ListLimit && NewestFirst(r)
    ensures r == ListActivities(store.Docs(), q)
  {
    r := ListActivities(store.Docs(), q);
  }

  // ----- properties of the moderation transition -----

  /** An action other than 'approved'/'rejected' is a 400 that touches neither store nor directory. */
  lemma InvalidActionTouchesNothing(records: map<Id, Activity>, documents: map<string, Certificate>, id: Id,
                                    req: VerifyRequest, env: Env, clock: Clock, sink: SinkResult)
    requires !IsAction(req.action)
    ensures Transition(records, documents, id, req, env, clock, sink) == Outcome(InvalidAction, records, documents)
    ensures InvalidAction.Code() == 400
  {
  }

  /** An unknown id is a 404 with no credential or PDF work. */
  lemma UnknownIdIsNotFound(records: map<Id, Activity>, documents: map<string, Certificate>, id: Id,
                            req: VerifyRequest, env: Env, clock: Clock, sink: SinkResult)
    requires IsAction(req.action) && id !in records
    ensures Transition(records, documents, id, req, env, clock, sink) == Outcome(NotFound, records, documents)
  {
  }

  /**
   * The first update sets `status` and `verifiedAt`, keeps the stored moderator
   * unless the request's is truthy, and overwrites the comment unless the
   * request's is undefined (so `''` and null overwrite); nothing else changes
   * besides `updatedAt`.
   */
  lemma StatusPatchEffect(a: Activity, req: VerifyRequest, now: Time)
    requires IsAction(req.action)
    ensures var u := ApplySet(a, StatusPatch(req, now), now);
      && u.status == req.action
      && u.verifiedAt == Val(now)
      && u.moderator == (if TruthyStr(req.moderator) then req.moderator else a.moderator)
      && u.comment == (if req.comment.Undefined? then a.comment else req.comment)
      && u == a.(status := u.status, moderator := u.moderator, comment := u.comment,
                 verifiedAt := u.verifiedAt, updatedAt := now)
  {
  }

  /** A rejection answers 200 with the once-updated record: no token, no PDF, no second update. */
  lemma RejectionOnlyUpdatesStatus(records: map<Id, Activity>, documents: map<string, Certificate>, id: Id,
                                   req: VerifyRequest, env: Env, clock: Clock, sink: SinkResult)
    requires req.action == Val(Rejected) && id in records
    ensures var o := Transition(records, documents, id, req, env, clock, sink);
      && o.response.RejectedOk?
      && o.response.Code() == 200
      && o.response.activity == ApplySet(records[id], StatusPatch(req, clock.patchAt), clock.patchAt)
      && o.response.activity.status == Val(Rejected)
      && o.response.activity.jwt == records[id].jwt
      && o.response.activity.pdfUrl == records[id].pdfUrl
      && o.records == records[id := o.response.activity]
      && o.documents == documents
  {
  }

  /** Signing the approval payload cannot fail: the key is never empty and the payload has no `exp`. */
  lemma ApprovalSigningSucceeds(u: Activity, req: VerifyRequest, env: Env, issueAt: Time)
    ensures Sign(BuildClaims(u, req, env, issueAt), SecretOf(env), HS256, YearSeconds, issueAt / 1000).Success?
  {
  }

  /**
   * A successful approval: the response carries the locator and the token
   * stored by the second update, which sets exactly `pdfUrl` and `jwt`; the
   * certificate is written at the locator; the token's claims are those of
   * the once-updated record.
   */
  lemma ApprovalIssuesCredential(records: map<Id, Activity>, documents: map<string, Certificate>, id: Id,
                                 req: VerifyRequest, env: Env, clock: Clock)
    requires req.action == Val(Approved) && id in records && records[id].id == id
    ensures var o := Transition(records, documents, id, req, env, clock, Flushed);
      var u := ApplySet(records[id], StatusPatch(req, clock.patchAt), clock.patchAt);
      && o.response.ApprovedOk?
      && o.response.Code() == 200
      && o.response.pdfUrl == PdfUrl(id)
      && o.response.activity == u.(pdfUrl := Val(PdfUrl(id)), jwt := Val(o.response.token), updatedAt := clock.finalAt)
      && o.records == records[id := o.response.activity]
      && o.documents == documents[PdfUrl(id) := RenderCertificate(u, req, clock.issueAt)]
      && o.response.token.header == Header(HS256, "JWT")
      && o.response.token.signature == Mac(HS256, SecretOf(env), o.response.token.header, o.response.token.payload)
      && o.response.token.payload.sub == "student:" + records[id].studentId
      && o.response.token.payload.jti == "activity:" + id
      && o.response.token.payload.vc.types == CredentialTypes
      && o.response.token.payload.vc.credentialSubject.studentId == records[id].studentId
      && o.response.token.payload.vc.credentialSubject.activity.title == records[id].title
      && o.response.token.payload.exp == Some(o.response.token.payload.iat + YearSeconds)
  {
    var u := ApplySet(records[id], StatusPatch(req, clock.patchAt), clock.patchAt);
    ApprovalSigningSucceeds(u, req, env, clock.issueAt);
  }

  /**
   * Issuance failing after the status update answers 500 and leaves the
   * record approved without a credential update: nothing is rolled back.
   */
  lemma FailedIssuanceKeepsApproval(records: map<Id, Activity>, documents: map<string, Certificate>, id: Id,
                                    req: VerifyRequest, env: Env, clock: Clock, message: string)
    requires req.action == Val(Approved) && id in records
    ensures var o := Transition(records, documents, id, req, env, clock, WriteFailed(message));
      && o.response == ServerError(message)
      && o.response.Code() == 500
      && o.records[id].status == Val(Approved)
      && o.records[id].jwt == records[id].jwt
      && o.records[id].pdfUrl == records[id].pdfUrl
      && o.records == records[id := ApplySet(records[id], StatusPatch(req, clock.patchAt), clock.patchAt)]
      && o.documents == documents
  {
    ApprovalSigningSucceeds(ApplySet(records[id], StatusPatch(req, clock.patchAt), clock.patchAt), req, env, clock.issueAt);
  }

  /**
   * The current status is never consulted: approving an already approved
   * record signs a new token (with the new clock's `iat`), overwrites the
   * stored one, and rewrites the certificate at the same locator, so the
   * directory still holds one certificate for the id.
   */
  lemma ReapprovalResigns(records: map<Id, Activity>, documents: map<string, Certificate>, id: Id,
                          req: VerifyRequest, env: Env, clock: Clock)
    requires req.action == Val(Approved) && id in records && records[id].id == id
    requires records[id].status == Val(Approved) && records[id].jwt.Val?
    ensures var o := Transition(records, documents, id, req, env, clock, Flushed);
      && o.response.ApprovedOk?
      && o.response.token.payload.iat == clock.issueAt / 1000
      && o.records[id].jwt == Val(o.response.token)
      && o.documents.Keys == documents.Keys + {PdfUrl(id)}
  {
    ApprovalSigningSucceeds(ApplySet(records[id], StatusPatch(req, clock.patchAt), clock.patchAt), req, env, clock.issueAt);
  }

  /** The locator depends on the id alone, and different ids get different locators. */
  lemma PdfUrlInjective(a: Id, b: Id)
    ensures PdfUrl(a) == PdfUrl(b) <==> a == b
  {
    if PdfUrl(a) == PdfUrl(b) {
      assert |a| == |b|;
      assert a == PdfUrl(a)[|PdfPrefix|..|PdfPrefix| + |a|];
    }
  }

  /**
   * The fallback chains: `verified_by.name` is the request's moderator, else the
   * stored one, else 'Unknown' (the certificate ends in 'N/A'); the
   * certificate's comment is the request's, else the stored one only when the
   * request left it undefined, else 'None'.
   */
  lemma FallbackChains(a: Activity, req: VerifyRequest, env: Env, clock: Clock)
    requires IsAction(req.action)
    ensures var u := ApplySet(a, StatusPatch(req, clock.patchAt), clock.patchAt);
      var c := BuildClaims(u, req, env, clock.issueAt);
      var cert := RenderCertificate(u, req, clock.issueAt);
      && c.vc.credentialSubject.verifiedBy
         == (if TruthyStr(req.moderator) then req.moderator.v else StrOr(a.moderator, "Unknown"))
      && cert.verifiedBy == (if TruthyStr(req.moderator) then req.moderator.v else StrOr(a.moderator, "N/A"))
      && cert.comments
         == (if TruthyStr(req.comment) then req.comment.v
             else if req.comment.Undefined? then StrOr(a.comment, "None")
             else "None")
  {
  }

  /** A record with 0 hours gets `hours: null` in the token but prints "Hours: 0" on the certificate. */
  lemma ZeroHoursDiverge(u: Activity, req: VerifyRequest, env: Env, issueAt: Time)
    requires u.hours == Val(0)
    ensures BuildClaims(u, req, env, issueAt).vc.credentialSubject.activity.hours == Null
    ensures RenderCertificate(u, req, issueAt).hours == HoursValue(0)
  {
  }
}
