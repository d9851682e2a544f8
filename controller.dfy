/** The HTTP handlers: each a choice of status code (and body) from the service's outcome. */
module Controller {
  import opened Wrappers
  import opened Entity
  import opened Exceptions
  import opened Repository
  import Service
  import Mapper
  import Dto
  import Decimal

  const Ok := 200
  const Created := 201
  const BadRequest := 400
  const NotFound := 404
  const Conflict := 409
  const InternalServerError := 500

  /** A response: status code, optional body, optional Location header. */
  datatype Response<B> = Response(status: nat, body: Option<B>, location: Option<string>)

  /** Java's string concatenation of a nullable Integer id. */
  function IdText(id: Option<nat>): (s: string)
    ensures id.Some? ==> Decimal.IsDigits(s) && Decimal.Value(s) == id.value
    ensures id.None? ==> s == "null"
  {
    if id.Some? then
      Decimal.ValueOfNatToString(id.value);
      Decimal.NatToString(id.value)
    else "null"
  }

  /** getAllMembers: always 200 with the mapped list, an empty list included. */
  function GetAllMembers(ms: seq<Member>): (r: Response<seq<Dto.Info>>)
    ensures r.status == Ok && r.body.Some? && r.location.None?
    ensures |r.body.value| == |ms|
    ensures forall k :: 0 <= k < |ms| ==> r.body.value[k] == Mapper.MemberToInfo(ms[k])
  {
    Response(Ok, Some(Mapper.MemberToInfoList(ms)), None)
  }

  /** getMemberById: 404 without a body for null, otherwise 200 with the member's payload. */
  function GetMemberById(m: Option<Member>): (r: Response<Dto.Info>)
    ensures r.status == NotFound <==> m.None?
    ensures m.None? ==> r.body.None?
    ensures m.Some? ==> r.status == Ok && r.body == Some(Mapper.MemberToInfo(m.value))
  {
    if m.None? then Response(NotFound, None, None)
    else Response(Ok, Some(Mapper.MemberToInfo(m.value)), None)
  }

  /** checkEmail: 200 with the email's availability, the negation of its existence. */
  function CheckEmail(exists_: bool): (r: Response<bool>)
    ensures r.status == Ok && r.body == Some(!exists_)
  {
    Response(Ok, Some(!exists_), None)
  }

  /** createMember: a storage violation answers 500 (caught before the general RuntimeException),
      any other failure 400, and success 201 with Location /Members/<id> and no body. */
  function CreateMember(outcome: Result<Member, Failure>): (r: Response<Dto.Info>)
    ensures r.status == InternalServerError <==> outcome == Failure(DataIntegrityViolation)
    ensures r.status == BadRequest <==> outcome.Failure? && outcome.error != DataIntegrityViolation
    ensures r.status == Created <==> outcome.Success?
    ensures r.body.None?
    ensures outcome.Success? ==> r.location == Some("/Members/" + IdText(outcome.value.id))
    ensures outcome.Failure? ==> r.location.None?
  {
    match outcome
    case Failure(DataIntegrityViolation) => Response(InternalServerError, None, None)
    case Failure(_) => Response(BadRequest, None, None)
    case Success(m) => Response(Created, None, Some("/Members/" + IdText(m.id)))
  }

  /** updateMember: any failure, a storage violation included, answers 409; success 200 with the merged member. */
  function UpdateMember(outcome: Result<Member, Failure>): (r: Response<Dto.Info>)
    ensures r.status == Conflict <==> outcome.Failure?
    ensures outcome.Failure? ==> r.body.None?
    ensures outcome.Success? ==> r.status == Ok && r.body == Some(Mapper.MemberToInfo(outcome.value))
  {
    match outcome
    case Failure(_) => Response(Conflict, None, None)
    case Success(m) => Response(Ok, Some(Mapper.MemberToInfo(m)), None)
  }

  /** deleteMemberById: any failure, not-found included, answers 500; success 200 with body true. */
  function DeleteMemberById(outcome: Outcome<Failure>): (r: Response<bool>)
    ensures r.status == InternalServerError <==> outcome.Fail?
    ensures outcome.Fail? ==> r.body.None?
    ensures outcome.Pass? ==> r.status == Ok && r.body == Some(true)
  {
    match outcome
    case Fail(_) => Response(InternalServerError, None, None)
    case Pass => Response(Ok, Some(true), None)
  }

  /** A create request through the service: 400 when the email is already in use or the payload breaks
      the entity constraints (there is no validation at the handler, so the store's validation refuses it),
      otherwise 201 pointing at a new id; the 500 branch is unreachable in a sequential run. The syntax of
      the email is not checked here, so the 201 case stands for drafts whose email is well formed. */
  lemma CreateRequest(t: Table, c: Dto.Create, now: Timestamp)
    requires Inv(t)
    ensures var s := Service.SaveMemberStep(t, Mapper.CreateToMember(c), now);
      var r := CreateMember(s.result);
      && r.status != InternalServerError
      && (r.status == BadRequest <==> EmailTaken(t.rows, c.email) || !Dto.ValidCreate(c))
      && (r.status == Created <==> !EmailTaken(t.rows, c.email) && Dto.ValidCreate(c))
      && (r.status == Created ==>
            && s.result.value.id.Some? && s.result.value.id.value !in t.rows
            && r.location == Some("/Members/" + Decimal.NatToString(s.result.value.id.value)))
  {
    var m := Mapper.CreateToMember(c);
    Mapper.CreatePayloadValidity(c);
    if !EmailTaken(t.rows, m.email) && ValidFields(m) {
      Service.SaveMemberAddsOne(t, m, now);
    }
  }

  /** An update request with a validated payload: 409 exactly when the id is absent or the new email
      belongs to someone else; otherwise 200 with the merged member. */
  lemma UpdateRequest(t: Table, id: nat, u: Dto.Update, now: Timestamp)
    requires Inv(t) && Dto.ValidUpdate(u)
    ensures var s := Service.UpdateMemberStep(t, id, Mapper.UpdateToMember(u), now);
      var r := UpdateMember(s.result);
      && (r.status == Conflict <==>
            id !in t.rows || (u.email != t.rows[id].email && EmailTaken(t.rows, u.email)))
      && (r.status == Ok ==> r.body == Some(Mapper.MemberToInfo(Mapper.Update(t.rows[id], Mapper.UpdateToMember(u)))))
  {
    var patch := Mapper.UpdateToMember(u);
    Mapper.UpdatePayloadValidity(u);
    if id in t.rows && (u.email == t.rows[id].email || !EmailTaken(t.rows, u.email)) {
      Service.UpdateMemberMerges(t, id, patch, now);
    }
  }

  /** A delete request: 500 exactly when the id is absent, 200 with true otherwise. */
  lemma DeleteRequest(t: Table, id: nat)
    requires Inv(t)
    ensures DeleteMemberById(Service.DeleteMemberStep(t, id).result).status ==
      (if id in t.rows then Ok else InternalServerError)
  {
  }
}
