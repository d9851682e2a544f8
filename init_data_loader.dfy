/** Start-up seeding, and a whole member lifecycle driven through the service and the controller. */
module InitDataLoader {
  import opened Wrappers
  import opened Entity
  import opened Exceptions
  import opened Repository
  import Service
  import Mapper
  import Dto
  import Controller

  const AdminEmail := "admin@mail.com"
  /** The operator's name, written in Hangul. */
  const AdminName := "\U{C6B4}\U{C601}\U{C790}"
  const Admin := Member(None, None, Some(AdminEmail), Some(AdminName), None, None, None)

  /** run: save the administrator straight into the store (no service-level email check).
      On the empty table of a fresh start it leaves exactly that one member. */
  method Run(repo: MemberRepo, now: Timestamp) returns (r: Result<Member, Failure>)
    requires repo.Valid()
    modifies repo
    ensures repo.Valid()
    ensures Saved(r, repo.State()) == SaveStep(old(repo.State()), Admin, now)
    ensures old(repo.rows) == map[] ==>
      && r.Success? && r.value.id == Some(old(repo.nextId))
      && repo.rows == map[old(repo.nextId) := r.value]
      && EmailTaken(repo.rows, Some(AdminEmail))
  {
    r := repo.Save(Admin, now);
    if old(repo.rows) == map[] {
      assert repo.rows[r.value.id.value] == r.value;
    }
  }

  /** Create a member, read it back, move it to a new email, create again with the first email,
      delete the member, read it again: the status codes the handlers answer, in order. */
  method AdminLifecycle() returns (statuses: seq<nat>)
    ensures statuses == [Controller.Created, Controller.Ok, Controller.Ok, Controller.Created, Controller.Ok, Controller.NotFound]
  {
    var repo := new MemberRepo();
    var service := new Service.MemberService(repo);
    var draft := Mapper.CreateToMember(Dto.Create(Some(AdminEmail), Some("operator"), Some("010-1234-5678")));

    var created := service.SaveMember(draft, 1);
    assert created.Success? && created.value.id == Some(1);
    var id := 1;
    var got := service.GetMemberById(id);
    assert got == Some(created.value);
    assert got.value.email == Some(AdminEmail) && got.value.name == Some("operator") && got.value.regDt == Some(1);

    var newEmail := "new@mail.com";
    assert newEmail[0] != AdminEmail[0];
    var updated := service.UpdateMember(id, Mapper.UpdateToMember(Dto.Update(Some(newEmail), None, None)), 2);
    assert updated.Success? && updated.value.email == Some(newEmail) && updated.value.name == Some("operator");
    assert repo.rows[1].email == Some(newEmail);

    var again := service.SaveMember(draft, 3);
    assert again.Success? && again.value.id == Some(2);

    var deleted := service.DeleteMemberById(id);
    var gone := service.GetMemberById(id);

    statuses := [
      Controller.CreateMember(created).status,
      Controller.GetMemberById(got).status,
      Controller.UpdateMember(updated).status,
      Controller.CreateMember(again).status,
      Controller.DeleteMemberById(deleted).status,
      Controller.GetMemberById(gone).status];
  }
}
