/** The member service: the business rules over the member table. */
module Service {
  import opened Wrappers
  import opened Entity
  import opened Exceptions
  import opened Repository
  import Mapper
  import Dto
  import Decimal

  const EmailExistsMessage := "Email already exists"
  const UpdateEmailExistsMessage := "Update Email already exists"

  function UpdateNotFoundMessage(id: nat): string {
    "Update Member with id: " + Decimal.NatToString(id) + " doesn't exist"
  }

  function DeleteNotFoundMessage(id: nat): string {
    "Delete Member with id: " + Decimal.NatToString(id) + " doesn't exist"
  }

  /** What a service call returns or throws, and the table after it. */
  datatype Step<R> = Step(result: R, after: Table)

  /** saveMember: refuse an email some row already has, otherwise hand the record to the store,
      which refuses it when it breaks the entity constraints. The store's unique-constraint failure
      can never surface here. */
  function SaveMemberStep(t: Table, m: Member, now: Timestamp): (s: Step<Result<Member, Failure>>)
    requires Inv(t)
    ensures Inv(s.after)
    ensures s.result != Failure(DataIntegrityViolation)
    ensures EmailTaken(t.rows, m.email) ==> s == Step(Failure(RuntimeError(EmailExistsMessage)), t)
    ensures !EmailTaken(t.rows, m.email) ==> Saved(s.result, s.after) == SaveStep(t, m, now)
    ensures s.result.Success? <==> !EmailTaken(t.rows, m.email) && ValidFields(m)
    ensures !EmailTaken(t.rows, m.email) && !ValidFields(m) ==> s == Step(Failure(ConstraintViolation), t)
  {
    if EmailTaken(t.rows, m.email) then Step(Failure(RuntimeError(EmailExistsMessage)), t)
    else
      var saved := SaveStep(t, m, now);
      Step(saved.result, saved.after)
  }

  /** updateMember: the id must exist; the patch's email must not be null; a changed email must be
      free; then the patch is merged onto the stored row and the merge is saved, which Bean Validation
      refuses when the patch's fields break the entity constraints. */
  function UpdateMemberStep(t: Table, id: nat, patch: Member, now: Timestamp): (s: Step<Result<Member, Failure>>)
    requires Inv(t)
    ensures Inv(s.after)
    ensures id !in t.rows ==> s == Step(Failure(RuntimeError(UpdateNotFoundMessage(id))), t)
    ensures id in t.rows && patch.email.None? ==> s == Step(Failure(NullPointer), t)
    ensures id in t.rows && patch.email.Some? && patch.email != t.rows[id].email && EmailTaken(t.rows, patch.email) ==>
      s == Step(Failure(RuntimeError(UpdateEmailExistsMessage)), t)
    ensures (id in t.rows && patch.email.Some? && !ValidFields(patch) &&
             (patch.email == t.rows[id].email || !EmailTaken(t.rows, patch.email))) ==>
      s == Step(Failure(ConstraintViolation), t)
    ensures s.result.Success? ==> id in t.rows && s.result.value == Mapper.Update(t.rows[id], patch)
    ensures s.result == Failure(DataIntegrityViolation) ==> patch.id.Some? && patch.id != Some(id) && s.after == t
  {
    if id !in t.rows then Step(Failure(RuntimeError(UpdateNotFoundMessage(id))), t)
    else
      var existing := t.rows[id];
      if patch.email.None? then Step(Failure(NullPointer), t)
      else if patch.email != existing.email && EmailTaken(t.rows, patch.email) then
        Step(Failure(RuntimeError(UpdateEmailExistsMessage)), t)
      else
        var merged := Mapper.Update(existing, patch);
        Mapper.UpdateKeepsValidity(existing, patch);
        var saved := SaveStep(t, merged, now);
        assert (patch.id.None? || patch.id == Some(id)) ==> !EmailHeldByOther(t.rows, merged.email, Target(t, merged)) by {
          if patch.id.None? || patch.id == Some(id) {
            assert Target(t, merged) == Some(id);
            if k :| k in t.rows && Some(k) != Some(id) && t.rows[k].email == merged.email {
              assert false;
            }
          }
        }
        Step(if saved.result.Success? then Success(merged) else saved.result, saved.after)
  }

  /** deleteMemberById: the id must exist; then exactly that row is removed. */
  function DeleteMemberStep(t: Table, id: nat): (s: Step<Outcome<Failure>>)
    requires Inv(t)
    ensures Inv(s.after)
    ensures s.result.Pass? <==> id in t.rows
    ensures id !in t.rows ==> s == Step(Fail(RuntimeError(DeleteNotFoundMessage(id))), t)
    ensures id !in s.after.rows
    ensures forall k :: k in t.rows && k != id ==> k in s.after.rows && s.after.rows[k] == t.rows[k]
    ensures forall k :: k in s.after.rows ==> k in t.rows
  {
    if id !in t.rows then Step(Fail(RuntimeError(DeleteNotFoundMessage(id))), t)
    else Step(Pass, DeleteStep(t, id))
  }

  /** A fresh member (no id yet, valid fields, email not in use) is added as exactly one new row under a fresh id;
      every earlier row is kept; the returned record is the stored one; its email is now in use. */
  lemma SaveMemberAddsOne(t: Table, m: Member, now: Timestamp)
    requires Inv(t) && m.id.None? && ValidFields(m) && !EmailTaken(t.rows, m.email)
    ensures var s := SaveMemberStep(t, m, now);
      && s.result.Success?
      && var r := s.result.value;
      && r.id.Some? && r.id.value !in t.rows
      && s.after.rows == t.rows[r.id.value := r]
      && |s.after.rows| == |t.rows| + 1
      && r.email == m.email && r.name == m.name && r.phone == m.phone
      && r.regDt == Some(now) && r.modDt == Some(now)
      && EmailTaken(s.after.rows, m.email)
  {
    var s := SaveMemberStep(t, m, now);
    assert Target(t, m).None?;
    var r := s.result.value;
    assert s.after.rows[r.id.value] == r;
  }

  /** Once a member is saved, saving another member with the same email is refused. */
  lemma SaveMemberTwiceRefused(t: Table, m: Member, m': Member, now: Timestamp, later: Timestamp)
    requires Inv(t) && m'.email == m.email
    requires SaveMemberStep(t, m, now).result.Success?
    ensures var s := SaveMemberStep(t, m, now);
      SaveMemberStep(s.after, m', later) == Step(Failure(RuntimeError(EmailExistsMessage)), s.after)
  {
    var s := SaveMemberStep(t, m, now);
    var r := s.result.value;
    assert s.after.rows[r.id.value] == r;
  }

  /** An update whose patch has valid fields and carries no id of another row succeeds once the checks pass: the row at
      `id` becomes the merge (with a fresh mod_dt), every other row is untouched, and the merge is returned. */
  lemma UpdateMemberMerges(t: Table, id: nat, patch: Member, now: Timestamp)
    requires Inv(t) && id in t.rows && ValidFields(patch)
    requires patch.id.None? || patch.id == Some(id)
    requires patch.email == t.rows[id].email || !EmailTaken(t.rows, patch.email)
    ensures var s := UpdateMemberStep(t, id, patch, now);
      var merged := Mapper.Update(t.rows[id], patch);
      && s.result == Success(merged)
      && s.after.rows == t.rows[id := merged.(modDt := Some(now))]
      && s.after.nextId == t.nextId
  {
    var merged := Mapper.Update(t.rows[id], patch);
    Mapper.UpdateKeepsValidity(t.rows[id], patch);
    assert merged.id == Some(id);
    assert Target(t, merged) == Some(id);
  }

  /** Keeping one's own email never fails the email check: with a valid name and phone the update succeeds. */
  lemma OwnEmailAccepted(t: Table, id: nat, patch: Member, now: Timestamp)
    requires Inv(t) && id in t.rows && patch.id.None?
    requires patch.email == t.rows[id].email
    requires ValidName(patch.name) && ValidPhone(patch.phone)
    ensures UpdateMemberStep(t, id, patch, now).result.Success?
  {
    UpdateMemberMerges(t, id, patch, now);
  }

  /** After a successful delete the member is gone: looking it up finds nothing, and deleting it again
      or updating it with any patch at any time fails with the not-found message. */
  lemma DeleteThenGone(t: Table, id: nat, patch: Member, now: Timestamp)
    requires Inv(t) && id in t.rows
    ensures var s := DeleteMemberStep(t, id);
      && id !in s.after.rows
      && DeleteMemberStep(s.after, id).result == Fail(RuntimeError(DeleteNotFoundMessage(id)))
      && UpdateMemberStep(s.after, id, patch, now).result == Failure(RuntimeError(UpdateNotFoundMessage(id)))
  {
  }

  /** The text between a fixed prefix and a fixed suffix is determined by the whole. */
  lemma FramedEqual(p: string, x: string, y: string, q: string)
    requires p + x + q == p + y + q
    ensures x == y
  {
    assert x == (p + x + q)[|p|..|p| + |x|];
    assert y == (p + y + q)[|p|..|p| + |y|];
  }

  /** The not-found messages name the id unambiguously: equal messages come from equal ids. */
  lemma NotFoundMessagesInjective(a: nat, b: nat)
    requires UpdateNotFoundMessage(a) == UpdateNotFoundMessage(b) || DeleteNotFoundMessage(a) == DeleteNotFoundMessage(b)
    ensures a == b
  {
    if UpdateNotFoundMessage(a) == UpdateNotFoundMessage(b) {
      FramedEqual("Update Member with id: ", Decimal.NatToString(a), Decimal.NatToString(b), " doesn't exist");
    } else {
      FramedEqual("Delete Member with id: ", Decimal.NatToString(a), Decimal.NatToString(b), " doesn't exist");
    }
    Decimal.NatToStringInjective(a, b);
  }

  /** The service as an object over one repository. */
  class MemberService {
    const repo: MemberRepo

    constructor (repo: MemberRepo)
      ensures this.repo == repo
    {
      this.repo := repo;
    }

    /** getAllMembers: every stored member, in primary-key order; an empty table gives an empty list. */
    method GetAllMembers() returns (ms: seq<Member>)
      requires repo.Valid()
      ensures ListsRows(ms, repo.rows) && |ms| == |repo.rows|
      ensures repo.rows == map[] ==> ms == []
    {
      ms := repo.FindAll();
    }

    /** getMemberById: the stored member, or null for an absent id. */
    method GetMemberById(id: nat) returns (m: Option<Member>)
      ensures m.Some? <==> id in repo.rows
      ensures m.Some? ==> m.value == repo.rows[id]
    {
      m := repo.FindById(id);
    }

    /** isExistingEmail: whether some stored member has that email. */
    method IsExistingEmail(e: Option<string>) returns (b: bool)
      ensures b <==> EmailTaken(repo.rows, e)
    {
      b := repo.ExistsByEmail(e);
    }

    method SaveMember(m: Member, now: Timestamp) returns (r: Result<Member, Failure>)
      requires repo.Valid()
      modifies repo
      ensures repo.Valid()
      ensures Step(r, repo.State()) == SaveMemberStep(old(repo.State()), m, now)
    {
      var taken := IsExistingEmail(m.email);
      if taken {
        r := Failure(RuntimeError(EmailExistsMessage));
        return;
      }
      r := repo.Save(m, now);
    }

    method UpdateMember(id: nat, patch: Member, now: Timestamp) returns (r: Result<Member, Failure>)
      requires repo.Valid()
      modifies repo
      ensures repo.Valid()
      ensures Step(r, repo.State()) == UpdateMemberStep(old(repo.State()), id, patch, now)
    {
      var existing := repo.FindById(id);
      if existing.None? {
        r := Failure(RuntimeError(UpdateNotFoundMessage(id)));
        return;
      }
      if patch.email.None? {
        r := Failure(NullPointer);
        return;
      }
      if patch.email != existing.value.email {
        var taken := IsExistingEmail(patch.email);
        if taken {
          r := Failure(RuntimeError(UpdateEmailExistsMessage));
          return;
        }
      }
      var merged := Mapper.Update(existing.value, patch);
      var saved := repo.Save(merged, now);
      r := if saved.Success? then Success(merged) else saved;
    }

    method DeleteMemberById(id: nat) returns (r: Outcome<Failure>)
      requires repo.Valid()
      modifies repo
      ensures repo.Valid()
      ensures Step(r, repo.State()) == DeleteMemberStep(old(repo.State()), id)
    {
      var existing := repo.FindById(id);
      if existing.None? {
        r := Fail(RuntimeError(DeleteNotFoundMessage(id)));
        return;
      }
      repo.DeleteById(id);
      r := Pass;
    }
  }
}
