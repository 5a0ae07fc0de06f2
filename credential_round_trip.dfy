// The two backend controllers together: the token `verifyActivity` issues is
// accepted by `verifyToken` under the same environment (both fall back to the
// 'dev-secret' key) until it expires 365 days after issuance, and yields the
// claims built from the approved record without consulting the store.

module CredentialRoundTrip {
  import opened JsValues
  import opened Jwt
  import opened ActivityModel
  import opened ActivitiesController
  import opened VerifyController

  /** The approval's token verifies within its validity window and yields exactly its claims. */
  lemma IssuedCredentialVerifies(records: map<Id, Activity>, documents: map<string, Certificate>, id: Id,
                                 req: VerifyRequest, env: Env, clock: Clock, nowSec: int)
    requires req.action == Val(Approved) && id in records && records[id].id == id
    requires nowSec < clock.issueAt / 1000 + YearSeconds
    ensures var o := Transition(records, documents, id, req, env, clock, Flushed);
      && o.response.ApprovedOk?
      && VerifyToken(Some(Compact(o.response.token)), env, nowSec) == VerifyResponse(200, Valid(o.response.token.payload))
      && o.response.token.payload.iat == clock.issueAt / 1000
      && o.response.token.payload.sub == "student:" + records[id].studentId
      && o.response.token.payload.jti == "activity:" + id
      && o.response.token.payload.vc.credentialSubject.activity.title == records[id].title
      && o.response.token.payload.vc.credentialSubject.verifiedBy
         == (if TruthyStr(req.moderator) then req.moderator.v else StrOr(records[id].moderator, "Unknown"))
  {
    var u := ApplySet(records[id], StatusPatch(req, clock.patchAt), clock.patchAt);
    ApprovalIssuesCredential(records, documents, id, req, env, clock);
    FallbackChains(records[id], req, env, clock);
    var t := Sign(BuildClaims(u, req, env, clock.issueAt), SecretOf(env), HS256, YearSeconds, clock.issueAt / 1000).value;
    SignThenVerify(BuildClaims(u, req, env, clock.issueAt), SecretOf(env), HS256, YearSeconds, clock.issueAt / 1000, nowSec, AllowedAlgorithms);
  }

  /** From 365 days after issuance on, the same token is refused with the common message. */
  lemma IssuedCredentialExpires(records: map<Id, Activity>, documents: map<string, Certificate>, id: Id,
                                req: VerifyRequest, env: Env, clock: Clock, nowSec: int)
    requires req.action == Val(Approved) && id in records && records[id].id == id
    requires nowSec >= clock.issueAt / 1000 + YearSeconds
    ensures var o := Transition(records, documents, id, req, env, clock, Flushed);
      && o.response.ApprovedOk?
      && VerifyToken(Some(Compact(o.response.token)), env, nowSec) == VerifyResponse(400, Invalid(InvalidOrExpired))
  {
    var u := ApplySet(records[id], StatusPatch(req, clock.patchAt), clock.patchAt);
    ApprovalIssuesCredential(records, documents, id, req, env, clock);
    SignThenVerify(BuildClaims(u, req, env, clock.issueAt), SecretOf(env), HS256, YearSeconds, clock.issueAt / 1000, nowSec, AllowedAlgorithms);
  }

  /**
   * Approving the same record twice (a retry) issues two tokens that both
   * verify while both are unexpired and name the same subject, claim id and
   * activity; the directory holds a single certificate for the record.
   */
  lemma RetriedApprovalAgrees(records: map<Id, Activity>, documents: map<string, Certificate>, id: Id,
                              req: VerifyRequest, env: Env, first: Clock, second: Clock, nowSec: int)
    requires req.action == Val(Approved) && id in records && records[id].id == id
    requires nowSec < first.issueAt / 1000 + YearSeconds && nowSec < second.issueAt / 1000 + YearSeconds
    ensures var o1 := Transition(records, documents, id, req, env, first, Flushed);
      var o2 := Transition(o1.records, o1.documents, id, req, env, second, Flushed);
      && o1.response.ApprovedOk? && o2.response.ApprovedOk?
      && VerifyToken(Some(Compact(o1.response.token)), env, nowSec).body.Valid?
      && VerifyToken(Some(Compact(o2.response.token)), env, nowSec).body.Valid?
      && o1.response.token.payload.sub == o2.response.token.payload.sub
      && o1.response.token.payload.jti == o2.response.token.payload.jti
      && o1.response.token.payload.vc.credentialSubject.activity
         == o2.response.token.payload.vc.credentialSubject.activity
      && o2.documents.Keys == documents.Keys + {PdfUrl(id)}
      && o2.records[id].jwt == Val(o2.response.token)
  {
    var o1 := Transition(records, documents, id, req, env, first, Flushed);
    IssuedCredentialVerifies(records, documents, id, req, env, first, nowSec);
    assert o1.records[id].id == id;
    IssuedCredentialVerifies(o1.records, o1.documents, id, req, env, second, nowSec);
    ReapprovalResigns(o1.records, o1.documents, id, req, env, second);
  }

  /**
   * The worked example: an activity for student 2025CS001 titled
   * "Internship" with 40 hours, approved by "Dr. Rao" with the comment
   * "Verified", yields a token whose verified claims carry that title and
   * that moderator.
   */
  lemma InternshipScenario(id: Id, created: Time, clock: Clock, env: Env, nowSec: int)
    requires nowSec < clock.issueAt / 1000 + YearSeconds
    ensures var body := ActivityBody(Val("2025CS001"), Undefined, Undefined, Val("Internship"),
                                     Val(created), Val(40), Undefined, Undefined, Undefined);
      var a := NewActivity(body, id, created);
      var req := VerifyRequest(Val(Approved), Val("Dr. Rao"), Val("Verified"));
      && a.Success? && a.value.status == Val(Pending)
      && var o := Transition(map[id := a.value], map[], id, req, env, clock, Flushed);
      && o.response.ApprovedOk?
      && var v := VerifyToken(Some(Compact(o.response.token)), env, nowSec);
      && v.body.Valid?
      && v.body.payload.vc.credentialSubject.activity.title == Val("Internship")
      && v.body.payload.vc.credentialSubject.verifiedBy == "Dr. Rao"
      && v.body.payload.sub == "student:2025CS001"
  {
    var body := ActivityBody(Val("2025CS001"), Undefined, Undefined, Val("Internship"),
                             Val(created), Val(40), Undefined, Undefined, Undefined);
    var a := NewActivity(body, id, created);
    var req := VerifyRequest(Val(Approved), Val("Dr. Rao"), Val("Verified"));
    IssuedCredentialVerifies(map[id := a.value], map[], id, req, env, clock, nowSec);
  }
}
