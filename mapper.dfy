/** The conversions between rows and transport shapes, and the null-ignoring merge of a patch onto a row. */
module Mapper {
  import opened Wrappers
  import opened Entity
  import Dto

  /** The all-null record: a patch that sets nothing. */
  const EmptyPatch := Member(None, None, None, None, None, None, None)

  function Pick<T>(patch: Option<T>, target: Option<T>): Option<T> {
    if patch.Some? then patch else target
  }

  /** The merge with null values ignored: each non-null field of the patch replaces the target's
      field, each null field of the patch keeps the target's. */
  function Update(target: Member, patch: Member): (r: Member)
    ensures patch.id.Some? ==> r.id == patch.id
    ensures patch.id.None? ==> r.id == target.id
    ensures patch.uuid.Some? ==> r.uuid == patch.uuid
    ensures patch.uuid.None? ==> r.uuid == target.uuid
    ensures patch.email.Some? ==> r.email == patch.email
    ensures patch.email.None? ==> r.email == target.email
    ensures patch.name.Some? ==> r.name == patch.name
    ensures patch.name.None? ==> r.name == target.name
    ensures patch.phone.Some? ==> r.phone == patch.phone
    ensures patch.phone.None? ==> r.phone == target.phone
    ensures patch.regDt.Some? ==> r.regDt == patch.regDt
    ensures patch.regDt.None? ==> r.regDt == target.regDt
    ensures patch.modDt.Some? ==> r.modDt == patch.modDt
    ensures patch.modDt.None? ==> r.modDt == target.modDt
  {
    Member(
      Pick(patch.id, target.id),
      Pick(patch.uuid, target.uuid),
      Pick(patch.email, target.email),
      Pick(patch.name, target.name),
      Pick(patch.phone, target.phone),
      Pick(patch.regDt, target.regDt),
      Pick(patch.modDt, target.modDt))
  }

  /** An all-null patch changes nothing. */
  lemma UpdateWithEmptyPatch(target: Member)
    ensures Update(target, EmptyPatch) == target
  {
  }

  /** Merging the same patch a second time changes nothing more. */
  lemma UpdateIdempotent(target: Member, patch: Member)
    ensures Update(Update(target, patch), patch) == Update(target, patch)
  {
  }

  /** The row as a response payload: every column carried over unchanged. */
  function MemberToInfo(m: Member): (i: Dto.Info)
    ensures i.id == m.id && i.uuid == m.uuid
    ensures i.email == m.email && i.name == m.name && i.phone == m.phone
    ensures i.regDt == m.regDt && i.modDt == m.modDt
  {
    Dto.Info(m.id, m.uuid, m.email, m.name, m.phone, m.regDt, m.modDt)
  }

  /** The payload conversion loses nothing: distinct rows give distinct payloads. */
  lemma MemberToInfoInjective(a: Member, b: Member)
    requires MemberToInfo(a) == MemberToInfo(b)
    ensures a == b
  {
  }

  /** A payload built from a row satisfies the same field constraints as the row. */
  lemma MemberToInfoValid(m: Member)
    requires ValidFields(m)
    ensures Dto.ValidInfo(MemberToInfo(m))
  {
  }

  /** The list form: element by element, same length, same order. */
  function MemberToInfoList(ms: seq<Member>): (r: seq<Dto.Info>)
    ensures |r| == |ms|
    ensures forall k :: 0 <= k < |ms| ==> r[k] == MemberToInfo(ms[k])
  {
    if ms == [] then [] else [MemberToInfo(ms[0])] + MemberToInfoList(ms[1..])
  }

  /** A patch built from an update payload: email, name and phone copied, every generated column null. */
  function UpdateToMember(u: Dto.Update): (m: Member)
    ensures m.email == u.email && m.name == u.name && m.phone == u.phone
    ensures m.id.None? && m.uuid.None? && m.regDt.None? && m.modDt.None?
  {
    Member(None, None, u.email, u.name, u.phone, None, None)
  }

  /** A draft row built from a creation payload, with the same shape. */
  function CreateToMember(c: Dto.Create): (m: Member)
    ensures m.email == c.email && m.name == c.name && m.phone == c.phone
    ensures m.id.None? && m.uuid.None? && m.regDt.None? && m.modDt.None?
  {
    Member(None, None, c.email, c.name, c.phone, None, None)
  }

  /** Merging a patch built from an update payload keeps the row's id, uuid and both timestamps,
      takes the payload's email, and takes its name and phone only where they are present. */
  lemma UpdateFromPayload(target: Member, u: Dto.Update)
    ensures var r := Update(target, UpdateToMember(u));
      && r.id == target.id && r.uuid == target.uuid
      && r.regDt == target.regDt && r.modDt == target.modDt
      && (u.email.Some? ==> r.email == u.email)
      && r.name == (if u.name.Some? then u.name else target.name)
      && r.phone == (if u.phone.Some? then u.phone else target.phone)
  {
  }

  /** Merging onto a row that meets the entity constraints, with a patch whose email is present,
      gives a row meeting them exactly when the patch's own fields meet them. */
  lemma UpdateKeepsValidity(target: Member, patch: Member)
    requires ValidFields(target) && patch.email.Some?
    ensures ValidFields(Update(target, patch)) <==> ValidFields(patch)
  {
  }

  /** The patch built from an update payload meets the entity constraints exactly when the payload
      passes its own validation. */
  lemma UpdatePayloadValidity(u: Dto.Update)
    ensures ValidFields(UpdateToMember(u)) <==> Dto.ValidUpdate(u)
  {
  }

  /** The draft built from a creation payload meets the entity constraints exactly when the payload
      passes its own validation. */
  lemma CreatePayloadValidity(c: Dto.Create)
    ensures ValidFields(CreateToMember(c)) <==> Dto.ValidCreate(c)
  {
  }
}
